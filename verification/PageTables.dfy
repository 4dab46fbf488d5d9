/**
 Kernel page tables as a three-level tree of 512-entry tables in physical
 memory (kernel/machine/pmap/pmap_init.c:22-93): addresses, entries, the table
 walk, and the two ways the construction code changes a table.
 */
module PageTables {
  import opened Pages
  import opened Bits

  const PAGE_ENTRY_COUNT: nat := 0x200
  /** ((1 << (47 - 12)) - 1) << 12: bits 12 to 46 (pmap_asm.h:42). */
  const OUTPUT_ADDRESS_MASK: nat := 0x7FFF_FFFF_F000
  /** Addresses below this fit the output address field. */
  const FRAME_LIMIT: nat := 0x8000_0000_0000
  const PTE_INVALID: nat := 0
  const PTE_VALID: nat := 1
  const PTE_VALID_TABLE: nat := 3
  const PHYS_ADDR_INVALID: nat := 0xFFFF_FFFF_FFFF_FFFF
  /** The number of pages in the 39-bit address space of a table tree (TCR_T1SZ is 25). */
  const VPN_LIMIT: nat := 0x800_0000

  type PhysAddr = nat

  type Pte = nat

  /** The number of a page of the virtual address space. */
  type Vpn = nat

  /** What the 64-bit word at each physical address holds. */
  datatype Words = Words(cells: map<PhysAddr, Pte>)

  /** Stands for whatever a word holds that was never written: nothing is known of it. */
  const STALE: Pte

  function Word(words: Words, address: PhysAddr): (r: Pte) {
    if address in words.cells then words.cells[address] else STALE
  }

  function Store(words: Words, address: PhysAddr, value: Pte): (r: Words) {
    Words(words.cells[address := value])
  }

  predicate Valid(e: Pte) {
    And(e, PTE_VALID) != PTE_INVALID
  }

  predicate IsTableEntry(e: Pte) {
    And(e, PTE_VALID_TABLE) == PTE_VALID_TABLE
  }

  function Output(e: Pte): (r: PhysAddr) {
    And(e, OUTPUT_ADDRESS_MASK)
  }

  /** pte_to_phys_addr (pmap_init.c:48-55). */
  function PteToPhysAddr(e: Pte): (r: PhysAddr) {
    if And(e, PTE_VALID) == PTE_INVALID then PHYS_ADDR_INVALID else And(e, OUTPUT_ADDRESS_MASK)
  }

  /** template | OUTPUT_ADDRESS_TO_PTE(pa). */
  function MakePte(template: nat, pa: PhysAddr): (r: Pte) {
    Or(template, And(pa, OUTPUT_ADDRESS_MASK))
  }

  /** Attribute bits for a table or page entry; they leave the output address alone. */
  predicate Template(t: nat) {
    And(t, OUTPUT_ADDRESS_MASK) == 0 && IsTableEntry(t)
  }

  /** A physical page an entry can hold. */
  predicate Frame(p: PhysAddr) {
    p % PAGE_SIZE == 0 && p < FRAME_LIMIT
  }

  lemma OutputIsAField(p: nat)
    ensures Output(p) == p / 0x1000 % 0x8_0000_0000 * 0x1000
  {
    Powers();
    hide And, Pow2, Mask;
    AndMask(p, 35, 12);
  }

  lemma Powers()
    ensures Pow2(9) == 0x200 && Pow2(12) == 0x1000 && Pow2(35) == 0x8_0000_0000
    ensures OUTPUT_ADDRESS_MASK == Mask(47 - 12, 12) && Mask(9, 0) == 0x1FF
  {
    hide Pow2, Mask;
    SmallPowers();
    FourMore(1);
    FourMore(5);
    TwelveMore(0);
    TwelveMore(11);
    TwelveMore(23);
    FourMore(3);
    FourMore(7);
    MaskValue(35, 12);
    MaskValue(9, 0);
  }

  lemma SmallPowers()
    ensures Pow2(0) == 1 && Pow2(1) == 2 && Pow2(3) == 8
  {
    assert Pow2(2) == 4;
  }

  lemma TwelveMore(n: nat)
    ensures Pow2(n + 12) == 0x1000 * Pow2(n)
  {
    hide Pow2;
    FourMore(n + 8);
    FourMore(n + 4);
    FourMore(n);
  }

  lemma FourMore(n: nat)
    ensures Pow2(n + 4) == 0x10 * Pow2(n)
  {
    assert Pow2(n + 2) == 4 * Pow2(n);
  }

  lemma ValidBits(e: Pte)
    ensures IsTableEntry(e) ==> Valid(e)
    ensures PteToPhysAddr(e) == if Valid(e) then Output(e) else PHYS_ADDR_INVALID
    ensures Output(e) != PHYS_ADDR_INVALID
  {
    OutputIsAField(e);
    AndBits(e, PTE_VALID_TABLE);
    AndBits(e, PTE_VALID);
  }

  lemma TemplateIsFields(t: nat)
    ensures Template(t) <==> t / 0x1000 % 0x8_0000_0000 == 0 && t % 4 == 3
  {
    OutputIsAField(t);
    assert Mask(2, 0) == PTE_VALID_TABLE && Pow2(2) == 4;
    AndLowMask(t, 2);
  }

  /**
   * An entry keeps its type bits and every attribute outside the address field, and
   * gives back its output address exactly when that is page aligned and below 2^47.
   */
  lemma EntryRoundTrip(t: nat, pa: PhysAddr)
    requires Template(t)
    ensures var e := MakePte(t, pa);
            && IsTableEntry(e) && Valid(e)
            && (forall m :: And(OUTPUT_ADDRESS_MASK, m) == 0 ==> And(e, m) == And(t, m))
            && (PteToPhysAddr(e) == pa <==> Frame(pa)) && (Frame(pa) ==> Output(e) == pa)
  {
    MaskAndType();
    Zeros(pa);
    Zeros(And(pa, OUTPUT_ADDRESS_MASK));
    hide And, Or, Mask;
    var e := MakePte(t, pa);
    forall m | And(OUTPUT_ADDRESS_MASK, m) == 0
      ensures And(e, m) == And(t, m)
    {
      AndOverOr(t, And(pa, OUTPUT_ADDRESS_MASK), m);
      AndTwice(pa, OUTPUT_ADDRESS_MASK, m);
      Zeros(And(t, m));
    }
    ValidBits(e);
    AndOverOr(t, And(pa, OUTPUT_ADDRESS_MASK), OUTPUT_ADDRESS_MASK);
    AndTwice(pa, OUTPUT_ADDRESS_MASK, OUTPUT_ADDRESS_MASK);
    AndSelf(OUTPUT_ADDRESS_MASK);
    OutputIsAField(pa);
    assert Output(e) == Output(pa);
  }

  lemma MaskAndType()
    ensures And(OUTPUT_ADDRESS_MASK, PTE_VALID_TABLE) == 0
  {
    AndBits(OUTPUT_ADDRESS_MASK, PTE_VALID_TABLE);
    AndBits(OUTPUT_ADDRESS_MASK / 2, PTE_VALID_TABLE / 2);
  }

  /** The L1, L2 and L3 index of a virtual address (pmap_init.c:39-41). */
  function VaToPhysIndexes(va: nat): (r: (nat, nat, nat)) {
    (And(va / 0x4000_0000, Mask((64 - 25) - 30, 0)), And(va / 0x20_0000, 0x1FF), And(va / 0x1000, 0x1FF))
  }

  function VpnOf(va: nat): (r: Vpn) {
    va / 0x1000 % VPN_LIMIT
  }

  predicate InSpace(v: Vpn) {
    v < VPN_LIMIT
  }

  predicate InTable(i: nat) {
    i < PAGE_ENTRY_COUNT
  }

  function I1(v: Vpn): (r: nat) { v / 0x4_0000 }

  function I2(v: Vpn): (r: nat) { v / 0x200 % 0x200 }

  function I3(v: Vpn): (r: nat) { v % 0x200 }

  lemma IndexFields(va: nat)
    ensures va / 0x4000_0000 % 0x200 == I1(VpnOf(va))
    ensures va / 0x20_0000 % 0x200 == I2(VpnOf(va))
    ensures va / 0x1000 % 0x200 == I3(VpnOf(va))
  {
    var x := va / 0x1000;
    assert va / 0x20_0000 == x / 0x200 && va / 0x4000_0000 == x / 0x4_0000;
    SplitPage(x);
  }

  lemma SplitPage(x: nat)
    ensures var v := x % VPN_LIMIT;
            x / 0x4_0000 % 0x200 == v / 0x4_0000 && x / 0x200 % 0x200 == v / 0x200 % 0x200 && x % 0x200 == v % 0x200
  {
    var y, z := x / 0x200, x / 0x4_0000;
    var i1, i2, i3 := z % 0x200, y % 0x200, x % 0x200;
    var v := i1 * 0x4_0000 + i2 * 0x200 + i3;
    assert z == y / 0x200;
    RemainderIs(x, VPN_LIMIT, z / 0x200, v);
    RemainderIs(v, 0x4_0000, i1, i2 * 0x200 + i3);
    RemainderIs(v, 0x200, i1 * 0x200 + i2, i3);
    RemainderIs(i1 * 0x200 + i2, 0x200, i1, i2);
  }

  lemma IndexesOfAddress(va: nat)
    ensures VaToPhysIndexes(va) == (I1(VpnOf(va)), I2(VpnOf(va)), I3(VpnOf(va))) && InSpace(VpnOf(va))
  {
    Powers();
    IndexFields(va);
    hide And, Pow2, Mask;
    AndLowMask(va / 0x4000_0000, 9);
    AndLowMask(va / 0x20_0000, 9);
    AndLowMask(va / 0x1000, 9);
  }

  lemma IndexesInTable(v: Vpn)
    requires InSpace(v)
    ensures InTable(I1(v)) && InTable(I2(v)) && InTable(I3(v))
  {
  }

  lemma IndexesOfParts(i1: nat, i2: nat, i3: nat)
    requires InTable(i2) && InTable(i3)
    ensures var v := i1 * 0x4_0000 + i2 * 0x200 + i3; I1(v) == i1 && I2(v) == i2 && I3(v) == i3
  {
    var v := i1 * 0x4_0000 + i2 * 0x200 + i3;
    RemainderIs(v, 0x4_0000, i1, i2 * 0x200 + i3);
    RemainderIs(v, 0x200, i1 * 0x200 + i2, i3);
    RemainderIs(i1 * 0x200 + i2, 0x200, i1, i2);
  }

  lemma PartsOf(v: Vpn)
    ensures v == I1(v) * 0x4_0000 + I2(v) * 0x200 + I3(v) && InTable(I2(v)) && InTable(I3(v))
  {
  }

  lemma SameIndexesSamePage(v: Vpn, w: Vpn)
    ensures I1(v) == I1(w) && I2(v) == I2(w) && I3(v) == I3(w) ==> v == w
  {
    hide I1, I2, I3;
    PartsOf(v);
    PartsOf(w);
  }

  /** The carry of the mapping loop (pmap_init.c:140-154) is the index arithmetic of the next page. */
  lemma NextIndexes(v: Vpn)
    ensures I3(v) + 1 < PAGE_ENTRY_COUNT ==>
              I3(v + 1) == I3(v) + 1 && I2(v + 1) == I2(v) && I1(v + 1) == I1(v)
    ensures I3(v) + 1 >= PAGE_ENTRY_COUNT && I2(v) + 1 < PAGE_ENTRY_COUNT ==>
              I3(v + 1) == 0 && I2(v + 1) == I2(v) + 1 && I1(v + 1) == I1(v)
    ensures I3(v) + 1 >= PAGE_ENTRY_COUNT && I2(v) + 1 >= PAGE_ENTRY_COUNT ==>
              I3(v + 1) == 0 && I2(v + 1) == 0 && I1(v + 1) == I1(v) + 1
  {
    hide I1, I2, I3;
    PartsOf(v);
    if I3(v) + 1 < PAGE_ENTRY_COUNT {
      IndexesOfParts(I1(v), I2(v), I3(v) + 1);
    } else if I2(v) + 1 < PAGE_ENTRY_COUNT {
      IndexesOfParts(I1(v), I2(v) + 1, 0);
    } else {
      IndexesOfParts(I1(v) + 1, 0, 0);
    }
  }

  /** The address of entry i of a table. */
  function Slot(table: PhysAddr, i: nat): (r: PhysAddr) {
    table + i * 8
  }

  /** The page an address lies in. */
  function PageOf(a: PhysAddr): (r: PhysAddr) {
    a - a % PAGE_SIZE
  }

  lemma SlotInFrame(p: PhysAddr, i: nat)
    requires Frame(p) && InTable(i)
    ensures PageOf(Slot(p, i)) == p
  {
  }

  lemma SlotsDiffer(p: PhysAddr, i: nat, q: PhysAddr, j: nat)
    requires Frame(p) && InTable(i) && Frame(q) && InTable(j)
    ensures Slot(p, i) == Slot(q, j) ==> p == q && i == j
  {
  }

  datatype Translation = Fault | Block(pte: Pte) | Page(pte: Pte)

  /** What translating a page's address finds, from the root down (Arm ARM DDI 0487, VMSAv8-64 table walk). */
  function Walk(words: Words, root: PhysAddr, v: Vpn): (r: Translation) {
    var e1 := Word(words, Slot(root, I1(v)));
    if !Valid(e1) then Fault
    else if !IsTableEntry(e1) then Block(e1)
    else
      var e2 := Word(words, Slot(Output(e1), I2(v)));
      if !Valid(e2) then Fault
      else if !IsTableEntry(e2) then Block(e2)
      else
        var e3 := Word(words, Slot(Output(e2), I3(v)));
        if IsTableEntry(e3) then Page(e3) else Fault
  }

  /** Which table a page of physical memory holds. */
  datatype Node = Unused | Root | Level2(i1: nat) | Level3(i1: nat, i2: nat)

  datatype Owner = Owner(tables: map<PhysAddr, Node>)

  function NodeAt(owner: Owner, p: PhysAddr): (r: Node) {
    if p in owner.tables then owner.tables[p] else Unused
  }

  ghost predicate CanLink(n: Node) {
    n.Root? || n.Level2?
  }

  /** The table that entry i of a table leads to. */
  ghost function Child(n: Node, i: nat): (r: Node)
    requires CanLink(n)
  {
    if n.Root? then Level2(i) else Level3(n.i1, i)
  }

  ghost function Owning(owner: Owner, p: PhysAddr, n: Node): (r: Owner) {
    Owner(owner.tables[p := n])
  }

  lemma OwningAt(owner: Owner, p: PhysAddr, n: Node)
    ensures var after := Owning(owner, p, n);
            forall q {:trigger NodeAt(after, q)} :: NodeAt(after, q) == if q == p then n else NodeAt(owner, q)
  {
  }

  predicate Below(p: PhysAddr, limit: PhysAddr) {
    p < limit
  }

  /** An entry is invalid, or leads to the right table, or (at level 3) maps a page. */
  ghost predicate EntryFits(owner: Owner, n: Node, i: nat, e: Pte) {
    Valid(e) ==> IsTableEntry(e) && (CanLink(n) ==> NodeAt(owner, Output(e)) == Child(n, i))
  }

  /** The tables are distinct pages of the arena [root, limit) that form a tree; `owner` says which is which. */
  ghost predicate Tree(words: Words, owner: Owner, root: PhysAddr, limit: PhysAddr) {
    && NodeAt(owner, root) == Root
    && (forall p {:trigger NodeAt(owner, p)} :: NodeAt(owner, p) != Unused ==>
          Frame(p) && !Below(p, root) && Below(p, limit))
    && (forall p, i {:trigger Slot(p, i)} :: NodeAt(owner, p) != Unused && InTable(i) ==>
          EntryFits(owner, NodeAt(owner, p), i, Word(words, Slot(p, i))))
  }

  /** The entries a walk reads; the second and third mean something while those before are valid. */
  function Entry1(words: Words, root: PhysAddr, v: Vpn): (r: Pte) {
    Word(words, Slot(root, I1(v)))
  }

  function Entry2(words: Words, root: PhysAddr, v: Vpn): (r: Pte) {
    Word(words, Slot(Output(Entry1(words, root, v)), I2(v)))
  }

  function Entry3(words: Words, root: PhysAddr, v: Vpn): (r: Pte) {
    Word(words, Slot(Output(Entry2(words, root, v)), I3(v)))
  }

  /** The tables a walk passes through, as far as it gets. */
  lemma WalkPath(words: Words, owner: Owner, root: PhysAddr, limit: PhysAddr, v: Vpn)
    requires Tree(words, owner, root, limit) && InSpace(v)
    ensures var e1, e2, e3 := Entry1(words, root, v), Entry2(words, root, v), Entry3(words, root, v);
            && NodeAt(owner, root) == Root
            && (!Valid(e1) ==> Walk(words, root, v) == Fault)
            && (Valid(e1) ==> NodeAt(owner, Output(e1)) == Level2(I1(v)))
            && (Valid(e1) && !Valid(e2) ==> Walk(words, root, v) == Fault)
            && (Valid(e1) && Valid(e2) ==>
                  && NodeAt(owner, Output(e2)) == Level3(I1(v), I2(v))
                  && Walk(words, root, v) == if Valid(e3) then Page(e3) else Fault)
  {
    IndexesInTable(v);
    ValidBits(Entry1(words, root, v));
    ValidBits(Entry2(words, root, v));
    ValidBits(Entry3(words, root, v));
    hide Frame, Slot, IsTableEntry, Valid, Output, Below, InTable, InSpace, PteToPhysAddr, I1, I2, I3;
  }

  /** Storing one entry leaves the other entries of the tables alone. */
  lemma StoreElsewhere(words: Words, owner: Owner, t: PhysAddr, i: nat, e: Pte)
    requires (forall p {:trigger NodeAt(owner, p)} :: NodeAt(owner, p) != Unused ==>
        Frame(p)) && NodeAt(owner, t) != Unused && InTable(i)
    ensures var after := Store(words, Slot(t, i), e);
            forall p, j {:trigger Slot(p, j)} :: NodeAt(owner, p) != Unused && InTable(j) ==>
              Word(after, Slot(p, j)) == if p == t && j == i then e else Word(words, Slot(p, j))
  {
    hide Frame, Slot, InTable;
    var after := Store(words, Slot(t, i), e);
    forall p, j {:trigger Slot(p, j)} | NodeAt(owner, p) != Unused && InTable(j)
      ensures Word(after, Slot(p, j)) == if p == t && j == i then e else Word(words, Slot(p, j))
    {
      SlotsDiffer(p, j, t, i);
    }
  }

  /** The walk to v goes through table l3. */
  predicate Reaches(words: Words, root: PhysAddr, v: Vpn, l3: PhysAddr) {
    && Valid(Entry1(words, root, v))
    && Valid(Entry2(words, root, v)) && Output(Entry2(words, root, v)) == l3
  }

  lemma LeafTree(words: Words, owner: Owner, root: PhysAddr, limit: PhysAddr, l3: PhysAddr, i: nat, e: Pte)
    requires Tree(words, owner, root, limit) && NodeAt(owner, l3).Level3? && InTable(i) && IsTableEntry(e)
    ensures Tree(Store(words, Slot(l3, i), e), owner, root, limit)
  {
    hide Frame, Slot, IsTableEntry, Valid, Output, Below, InTable, PteToPhysAddr, Store;
    StoreElsewhere(words, owner, l3, i, e);
  }

  /** Writing a page entry leaves the tables its walk goes through. */
  lemma LeafReached(words: Words, owner: Owner, root: PhysAddr, limit: PhysAddr, v: Vpn, l3: PhysAddr, e: Pte)
    requires Tree(words, owner, root, limit) && InSpace(v) && Reaches(words, root, v, l3)
    ensures var after := Store(words, Slot(l3, I3(v)), e);
            Entry1(after, root, v) == Entry1(words, root, v) && Entry2(after, root, v) == Entry2(words, root, v)
  {
    hide Frame, Slot, IsTableEntry, Valid, Output, Below, InTable, InSpace, PteToPhysAddr, I1, I2, I3, Store, Walk;
    IndexesInTable(v);
    WalkPath(words, owner, root, limit, v);
    StoreElsewhere(words, owner, l3, I3(v), e);
  }

  lemma LeafWalk(words: Words, owner: Owner, root: PhysAddr, limit: PhysAddr, v: Vpn, l3: PhysAddr, e: Pte, w: Vpn)
    requires Tree(words, owner, root, limit) && InSpace(v) && Reaches(words, root, v, l3) && IsTableEntry(e)
    requires Tree(Store(words, Slot(l3, I3(v)), e), owner, root, limit) && InSpace(w)
    ensures Walk(Store(words, Slot(l3, I3(v)), e), root, w) == if w == v then Page(e) else Walk(words, root, w)
  {
    hide Frame, Slot, IsTableEntry, Valid, Output, Below, InTable, InSpace, PteToPhysAddr, I1, I2, I3, Store, Walk;
    WalkPath(words, owner, root, limit, v);
    IndexesInTable(v);
    IndexesInTable(w);
    ValidBits(e);
    StoreElsewhere(words, owner, l3, I3(v), e);
    WalkPath(words, owner, root, limit, w);
    WalkPath(Store(words, Slot(l3, I3(v)), e), owner, root, limit, w);
    SameIndexesSamePage(v, w);
    hide Tree;
  }

  /** Writing a page entry into the table its walk reaches changes that page's translation and no other. */
  lemma StoreLeaf(words: Words, owner: Owner, root: PhysAddr, limit: PhysAddr, v: Vpn, l3: PhysAddr, e: Pte)
    requires Tree(words, owner, root, limit) && InSpace(v) && Reaches(words, root, v, l3) && IsTableEntry(e)
    ensures var after := Store(words, Slot(l3, I3(v)), e);
            && Tree(after, owner, root, limit)
            && (forall w: Vpn :: InSpace(w) ==>
                  Walk(after, root, w) == if w == v then Page(e) else Walk(words, root, w))
  {
    hide Frame, Slot, IsTableEntry, Valid, Output, Below, InTable, InSpace, PteToPhysAddr, I1, I2, I3, Store, Walk;
    IndexesInTable(v);
    WalkPath(words, owner, root, limit, v);
    LeafTree(words, owner, root, limit, l3, I3(v), e);
    hide Tree;
    forall w | InSpace(w)
      ensures Walk(Store(words, Slot(l3, I3(v)), e), root, w) == if w == v then Page(e) else Walk(words, root, w)
    {
      LeafWalk(words, owner, root, limit, v, l3, e, w);
    }
  }

  /** Table t has nothing but invalid entries. */
  ghost predicate EmptyTable(words: Words, t: PhysAddr) {
    forall j {:trigger Slot(t, j)} :: InTable(j) ==> !Valid(Word(words, Slot(t, j)))
  }

  lemma StaysBelow(limit: PhysAddr, limit': PhysAddr)
    requires Below(limit, limit')
    ensures !Below(limit, limit)
    ensures forall p: PhysAddr :: Below(p, limit) ==> Below(p, limit') && !Below(limit, p)
  {
  }

  lemma LinkedTree(words: Words, owner: Owner, root: PhysAddr, limit: PhysAddr,
                   t: PhysAddr, i: nat, e: Pte, limit': PhysAddr)
    requires Tree(words, owner, root, limit) && CanLink(NodeAt(owner, t)) && InTable(i) && IsTableEntry(e)
    requires Frame(Output(e)) && EmptyTable(words, Output(e)) && !Valid(Word(words, Slot(t, i)))
    requires Output(e) == limit && Below(limit, limit')
    ensures var owner' := Owning(owner, Output(e), Child(NodeAt(owner, t), i));
            Tree(Store(words, Slot(t, i), e), owner', root, limit') && NodeAt(owner, limit) == Unused
  {
    hide Frame, Slot, IsTableEntry, Valid, Output, Below, InTable, PteToPhysAddr, Store, NodeAt, Owning;
    StaysBelow(limit, limit');
    var after, owner' := Store(words, Slot(t, i), e), Owning(owner, Output(e), Child(NodeAt(owner, t), i));
    OwningAt(owner, Output(e), Child(NodeAt(owner, t), i));
    assert NodeAt(owner, Output(e)) == Unused;
    StoreElsewhere(words, owner', t, i, e);
    forall p, j {:trigger Slot(p, j)} | NodeAt(owner', p) != Unused && InTable(j)
      ensures EntryFits(owner', NodeAt(owner', p), j, Word(after, Slot(p, j)))
    {
      assert p != Output(e) ==> EntryFits(owner, NodeAt(owner, p), j, Word(words, Slot(p, j)));
    }
  }

  /** Linking a new, empty table into an empty entry changes no translation. */
  lemma LinkTable(words: Words, owner: Owner, root: PhysAddr, limit: PhysAddr,
                  t: PhysAddr, i: nat, e: Pte, limit': PhysAddr)
    requires Tree(words, owner, root, limit) && CanLink(NodeAt(owner, t)) && InTable(i) && IsTableEntry(e)
    requires Frame(Output(e)) && EmptyTable(words, Output(e)) && !Valid(Word(words, Slot(t, i)))
    requires Output(e) == limit && Below(limit, limit')
    ensures var after, owner' := Store(words, Slot(t, i), e), Owning(owner, Output(e), Child(NodeAt(owner, t), i));
            && Tree(after, owner', root, limit')
            && (forall w: Vpn :: InSpace(w) ==> Walk(after, root, w) == Walk(words, root, w))
  {
    hide Frame, Slot, IsTableEntry, Valid, Output, Below, InTable, InSpace, PteToPhysAddr, I1, I2, I3, Store, Walk;
    LinkedTree(words, owner, root, limit, t, i, e, limit');
    var after, owner' := Store(words, Slot(t, i), e), Owning(owner, Output(e), Child(NodeAt(owner, t), i));
    StoreElsewhere(words, owner', t, i, e);
    hide Tree;
    forall w | InSpace(w)
      ensures Walk(after, root, w) == Walk(words, root, w)
    {
      IndexesInTable(w);
      WalkPath(words, owner, root, limit, w);
      WalkPath(after, owner', root, limit', w);
    }
  }

  /** Memory outside the tables has no influence on them. */
  lemma SameTables(words: Words, after: Words, owner: Owner, root: PhysAddr, limit: PhysAddr)
    requires Tree(words, owner, root, limit)
    requires forall p, j {:trigger Slot(p, j)} :: NodeAt(owner, p) != Unused && InTable(j) ==>
                                                    Word(after, Slot(p, j)) == Word(words, Slot(p, j))
    ensures Tree(after, owner, root, limit)
    ensures forall w: Vpn :: InSpace(w) ==> Walk(after, root, w) == Walk(words, root, w)
  {
    hide Frame, Slot, IsTableEntry, Valid, Output, Below, InTable, InSpace, PteToPhysAddr, I1, I2, I3, Walk;
    assert Tree(after, owner, root, limit);
    hide Tree;
    forall w | InSpace(w)
      ensures Walk(after, root, w) == Walk(words, root, w)
    {
      IndexesInTable(w);
      WalkPath(words, owner, root, limit, w);
      WalkPath(after, owner, root, limit, w);
    }
  }
}
