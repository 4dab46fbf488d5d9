/**
 The mapping loop of the boot code (kernel/machine/pmap/pmap_init.c:57-157):
 tables come from a bump arena, and the loop keeps the L2 and L3 table it is
 in instead of walking from the root for every page.
 */
module PageMapping {
  import opened Pages
  import opened Bits
  import opened PageTables
  import opened TableUse

  /** PTE_VALID_TABLE | UXN_TABLE | ACCESS_FLAG_BLOCK (pmap_asm.h:152-155). */
  const PTE_TEMPLATE_TABLE_KERN_ONLY: nat := 0x1000_0000_0000_0403

  /** memset: the first `count` words from a page's start become `fill`. */
  function Memset(words: Words, page: PhysAddr, fill: Pte, count: nat): (r: Words) {
    if count == 0 then words else Store(Memset(words, page, fill, count - 1), Slot(page, count - 1), fill)
  }

  lemma {:induction false} MemsetFills(words: Words, page: PhysAddr, fill: Pte, count: nat)
    requires Frame(page) && count <= PAGE_ENTRY_COUNT
    ensures var after := Memset(words, page, fill, count);
            && (forall j {:trigger Slot(page, j)} :: 0 <= j < count ==> Word(after, Slot(page, j)) == fill)
            && (forall a: PhysAddr :: PageOf(a) != page ==> Word(after, a) == Word(words, a))
  {
    if count > 0 {
      MemsetFills(words, page, fill, count - 1);
      SlotInFrame(page, count - 1);
    }
  }

  lemma Cleared(words: Words, page: PhysAddr)
    requires Frame(page)
    ensures var after := Memset(words, page, 0, PAGE_ENTRY_COUNT);
            && EmptyTable(after, page)
            && (forall a: PhysAddr :: PageOf(a) != page ==> Word(after, a) == Word(words, a))
  {
    Zeros(PTE_VALID);
    hide And, Memset, PageOf, Slot;
    MemsetFills(words, page, 0, PAGE_ENTRY_COUNT);
  }

  /** Pages whose table was there before keep their place in the tree. */
  ghost predicate Grows(before: Owner, after: Owner) {
    forall p {:trigger NodeAt(after, p)} :: NodeAt(before, p) != Unused ==> NodeAt(after, p) == NodeAt(before, p)
  }

  /** Memory outside the arena [start, end) is as it was. */
  ghost predicate Untouched(before: Words, after: Words, start: PhysAddr, end: PhysAddr) {
    forall a: PhysAddr :: PageOf(a) < start || end <= PageOf(a) ==> Word(after, a) == Word(before, a)
  }

  lemma UntouchedStill(before: Words, between: Words, after: Words, start: PhysAddr,
                       end1: PhysAddr, end2: PhysAddr, end: PhysAddr)
    requires Untouched(before, between, start, end1) && Untouched(between, after, start, end2)
    requires end1 <= end && end2 <= end
    ensures Untouched(before, after, start, end)
  {
    hide PageOf;
  }

  lemma NothingTouched(words: Words, start: PhysAddr, end: PhysAddr)
    ensures Untouched(words, words, start, end)
  {
  }

  /** A write to an entry of a table stays in the arena. */
  lemma TableWrite(words: Words, owner: Owner, root: PhysAddr, limit: PhysAddr, t: PhysAddr, i: nat, e: Pte)
    requires Tree(words, owner, root, limit) && NodeAt(owner, t) != Unused && InTable(i)
    ensures Untouched(words, Store(words, Slot(t, i), e), root, limit)
  {
    SlotInFrame(t, i);
    hide PageOf, Slot;
  }

  /** A new page, cleared, changes nothing in the tables. */
  lemma ClearedPage(words: Words, after: Words, owner: Owner, root: PhysAddr, limit: PhysAddr)
    requires Tree(words, owner, root, limit) && Frame(limit)
    requires forall a: PhysAddr :: PageOf(a) != limit ==> Word(after, a) == Word(words, a)
    ensures Tree(after, owner, root, limit) && SameWalks(words, after, root) && NodeAt(owner, limit) == Unused
    ensures Untouched(words, after, root, limit + PAGE_SIZE)
    ensures forall p, j {:trigger Slot(p, j)} :: NodeAt(owner, p) != Unused && InTable(j) ==>
                                                   Word(after, Slot(p, j)) == Word(words, Slot(p, j))
  {
    assert !Below(limit, limit) && Below(root, limit) && Untouched(words, after, root, limit + PAGE_SIZE);
    hide Untouched;
    hide Slot, PageOf, Frame, InTable, Below, InSpace;
    forall p, j {:trigger Slot(p, j)} | NodeAt(owner, p) != Unused && InTable(j)
      ensures Word(after, Slot(p, j)) == Word(words, Slot(p, j))
    {
      SlotInFrame(p, j);
    }
    hide Tree;
    SameTables(words, after, owner, root, limit);
  }

  /** The arena pointer has moved by at most this many pages. */
  predicate Later(before: PhysAddr, after: PhysAddr, pages: nat) {
    before <= after <= before + pages * PAGE_SIZE && after % PAGE_SIZE == 0
  }

  lemma TableFound(words: Words, owner: Owner, root: PhysAddr, limit: PhysAddr, t: PhysAddr, i: nat)
    requires Tree(words, owner, root, limit) && CanLink(NodeAt(owner, t)) && InTable(i)
        && Valid(Word(words, Slot(t, i)))
    ensures NodeAt(owner, Output(Word(words, Slot(t, i)))) == Child(NodeAt(owner, t), i)
    ensures Grows(owner, owner) && EntriesStay(words, words, owner) && SameWalks(words, words, root)
    ensures OnlyNew(owner, owner, Child(NodeAt(owner, t), i))
  {
    hide Slot, Frame, InTable, Below, InSpace, Valid, Output, Walk;
  }

  /** Installing a cleared page of the arena as the missing table of an entry. */
  lemma NewTable(words: Words, cleared: Words, owner: Owner, root: PhysAddr, limit: PhysAddr,
                 t: PhysAddr, i: nat, template: nat)
    requires Tree(words, owner, root, limit) && CanLink(NodeAt(owner, t)) && InTable(i)
        && !Valid(Word(words, Slot(t, i)))
    requires Frame(limit) && Template(template) && EmptyTable(cleared, limit)
    requires forall a: PhysAddr :: PageOf(a) != limit ==> Word(cleared, a) == Word(words, a)
    ensures var after, owner' := Store(cleared, Slot(t, i), MakePte(template, limit)), Owning(owner, limit,
        Child(NodeAt(owner, t), i));
            && Tree(after, owner', root, limit + PAGE_SIZE)
            && Grows(owner, owner') && NodeAt(owner', limit) == Child(NodeAt(owner, t), i)
            && Valid(Word(after, Slot(t, i))) && Output(Word(after, Slot(t, i))) == limit
            && EntriesStay(words, after, owner) && SameWalks(words, after, root)
            && Untouched(words, after, root, limit + PAGE_SIZE)
  {
    assert Below(limit, limit + PAGE_SIZE);
    hide Slot, PageOf, Frame, InTable, Below, InSpace, Valid, Output, Template, MakePte, Store, Walk, Untouched;
    var e := MakePte(template, limit);
    EntryRoundTrip(template, limit);
    ClearedPage(words, cleared, owner, root, limit);
    TableWrite(cleared, owner, root, limit, t, i, e);
    UntouchedStill(words, cleared, Store(cleared, Slot(t, i), e), root, limit + PAGE_SIZE, limit, limit + PAGE_SIZE);
    LinkTable(cleared, owner, root, limit, t, i, e, limit + PAGE_SIZE);
    StoreElsewhere(cleared, owner, t, i, e);
    hide Tree;
  }

  lemma StoreThere(words: Words, address: PhysAddr, e: Pte)
    ensures Word(Store(words, address, e), address) == e
  {
  }

  lemma TableTemplate()
    ensures Template(PTE_TEMPLATE_TABLE_KERN_ONLY)
  {
    hide And, Template;
    TemplateIsFields(PTE_TEMPLATE_TABLE_KERN_ONLY);
  }

  lemma EntryStays(before: Words, after: Words, owner: Owner, p: PhysAddr, i: nat)
    requires EntriesStay(before, after, owner) && NodeAt(owner, p) != Unused && InTable(i)
        && Valid(Word(before, Slot(p, i)))
    ensures Word(after, Slot(p, i)) == Word(before, Slot(p, i))
  {
    hide Slot, Valid, InTable;
  }

  lemma NotYet(words: Words, owner: Owner, root: PhysAddr, v: Vpn)
    requires InUse(words, owner, root)
    ensures InUseBut(words, owner, root, v)
  {
    hide Needed, Through;
  }

  /** Writing an entry that was invalid leaves all tables where they are. */
  lemma LeafKeepsEntries(words: Words, owner: Owner, root: PhysAddr, limit: PhysAddr, t: PhysAddr, i: nat, e: Pte)
    requires Tree(words, owner, root, limit) && Linked(words, owner, root)
    requires NodeAt(owner, t) != Unused && InTable(i) && !Valid(Word(words, Slot(t, i)))
    ensures Linked(Store(words, Slot(t, i), e), owner, root)
  {
    hide Frame, Slot, InTable, Below, Valid, Store, Linked, EntryFits;
    StoreElsewhere(words, owner, t, i, e);
    StaysLinked(words, Store(words, Slot(t, i), e), owner, root, limit);
  }

  /** The tables the loop keeps agree with a fresh walk to page v. */
  predicate Cached(words: Words, root: PhysAddr, v: Vpn, l2: PhysAddr, l3: PhysAddr) {
    && (l2 != PHYS_ADDR_INVALID ==>
          Valid(Entry1(words, root, v)) && Output(Entry1(words, root, v)) == l2)
    && (l3 != PHYS_ADDR_INVALID ==>
          l2 != PHYS_ADDR_INVALID && Valid(Entry2(words, root, v)) && Output(Entry2(words, root, v)) == l3)
  }

  predicate IndexesAt(v: Vpn, l1i: nat, l2i: nat, l3i: nat) {
    l1i == I1(v) && l2i == I2(v) && l3i == I3(v)
  }

  /** The variables the mapping loop carries from page to page. */
  datatype Cursor = Cursor(l1i: nat, l2i: nat, l3i: nat, l2: PhysAddr, l3: PhysAddr)

  predicate CursorAt(words: Words, root: PhysAddr, v: Vpn, c: Cursor) {
    IndexesAt(v, c.l1i, c.l2i, c.l3i) && Cached(words, root, v, c.l2, c.l3)
  }

  /** The end of the loop's body: moves the indexes on and forgets the tables left behind (pmap_init.c:139-154). */
  method Advance(l1i: nat, l2i: nat, l3i: nat, l2: PhysAddr, l3: PhysAddr, ghost v: Vpn)
    returns (l1i': nat, l2i': nat, l3i': nat, l2': PhysAddr, l3': PhysAddr, rolledOver: bool)
    requires InSpace(v) && IndexesAt(v, l1i, l2i, l3i)
    ensures IndexesAt(v + 1, l1i', l2i', l3i')
    ensures l2' == if I1(v + 1) == I1(v) then l2 else PHYS_ADDR_INVALID
    ensures l3' == if I1(v + 1) == I1(v) && I2(v + 1) == I2(v) then l3 else PHYS_ADDR_INVALID
    ensures rolledOver <==> !InSpace(v + 1)
  {
    NextIndexes(v);
    l1i', l2i', l3i', l2', l3', rolledOver := l1i, l2i, l3i + 1, l2, l3, false;
    if l3i' >= PAGE_ENTRY_COUNT {
      l3i' := 0;
      l3' := PHYS_ADDR_INVALID;
      l2i' := l2i' + 1;
      if l2i' >= PAGE_ENTRY_COUNT {
        l2i' := 0;
        l2' := PHYS_ADDR_INVALID;
        l1i' := l1i' + 1;
        rolledOver := l1i' >= PAGE_ENTRY_COUNT;
      }
    }
  }

  /** How many of `count` pages from v0 on the address space has. */
  function Mappable(v0: Vpn, count: nat): (r: nat)
    requires InSpace(v0)
  {
    if v0 + count <= VPN_LIMIT then count else VPN_LIMIT - v0
  }

  /** How a mapping call ends: the last two are its panics. */
  datatype Outcome = Done | AlreadyMapped | RolledOver

  /** phys_base + page_i * PAGE_SIZE, in 64 bits. */
  function FrameAt(physBase: PhysAddr, i: nat): (r: PhysAddr) {
    (physBase + i * PAGE_SIZE) % TWO_TO_64
  }

  /** The n pages from v0 on map the n frames from physBase on; every other page translates as before. */
  ghost predicate Mapped(before: Words, after: Words, root: PhysAddr, v0: Vpn, n: nat, template: nat,
                         physBase: PhysAddr) {
    forall w: Vpn :: InSpace(w) ==>
      Walk(after, root, w) ==
        if v0 <= w < v0 + n then Page(MakePte(template, FrameAt(physBase, w - v0))) else Walk(before, root, w)
  }

  ghost predicate NoneMapped(words: Words, root: PhysAddr, v0: Vpn, n: nat) {
    forall w: Vpn :: InSpace(w) && v0 <= w < v0 + n ==> Walk(words, root, w) == Fault
  }

  /** The first n pages were unmapped before and are mapped now. */
  ghost predicate Progress(before: Words, after: Words, root: PhysAddr, v0: Vpn, n: nat, template: nat,
                           physBase: PhysAddr) {
    Mapped(before, after, root, v0, n, template, physBase) && NoneMapped(before, root, v0, n)
  }

  /** Why a mapping call ends after `mapped` pages. */
  ghost predicate EndsAs(outcome: Outcome, before: Words, root: PhysAddr, v0: Vpn, pageCount: nat, mapped: nat) {
    match outcome
    case Done => mapped == pageCount && v0 + mapped <= VPN_LIMIT
    case AlreadyMapped => mapped < pageCount && InSpace(v0 + mapped) && Walk(before, root, v0 + mapped) != Fault
    case RolledOver => mapped < pageCount && v0 + mapped == VPN_LIMIT
  }

  lemma ArenaStart(p: PhysAddr)
    requires p % PAGE_SIZE == 0
    ensures Later(p, p, 0)
  {
  }

  /** The arena has room for one more page's tables. */
  lemma ArenaRoom(start: PhysAddr, now: PhysAddr, v0: Vpn, pageCount: nat, i: nat)
    requires Later(start, now, 2 * i) && InSpace(v0 + i) && i < pageCount
    requires start + 2 * PAGE_SIZE * Mappable(v0, pageCount) <= FRAME_LIMIT
    ensures Frame(now) && Frame(now + PAGE_SIZE)
  {
  }

  lemma ArenaLeft(between: PhysAddr, now: PhysAddr)
    requires Frame(between + PAGE_SIZE) && Later(between, now, 2)
    ensures ArenaPointer(now)
  {
  }

  predicate ArenaPointer(p: PhysAddr) {
    p % PAGE_SIZE == 0 && p <= FRAME_LIMIT
  }

  lemma LaterStill(start: PhysAddr, between: PhysAddr, now: PhysAddr, i: nat)
    requires Later(start, between, 2 * i) && Later(between, now, 2)
    ensures Later(start, now, 2 * (i + 1))
  {
  }

  /** One more page: v0 + n. */
  lemma OneMore(before: Words, between: Words, after: Words, root: PhysAddr, v0: Vpn, n: nat, template: nat,
                physBase: PhysAddr)
    requires Mapped(before, between, root, v0, n, template, physBase) && NoneMapped(before, root, v0, n)
    requires InSpace(v0 + n) && Walk(between, root, v0 + n) == Fault
    requires OnePage(between, after, root, v0 + n, Page(MakePte(template, FrameAt(physBase, n))))
    ensures Mapped(before, after, root, v0, n + 1, template, physBase) && NoneMapped(before, root, v0, n + 1)
  {
    hide InSpace, Walk, MakePte, FrameAt;
  }

  /** The tables kept for page v still fit the next page, as far as Advance keeps them. */
  lemma CachedNext(words: Words, root: PhysAddr, v: Vpn, l2: PhysAddr, l3: PhysAddr, l2': PhysAddr, l3': PhysAddr)
    requires Cached(words, root, v, l2, l3)
    requires l2' == if I1(v + 1) == I1(v) then l2 else PHYS_ADDR_INVALID
    requires l3' == if I1(v + 1) == I1(v) && I2(v + 1) == I2(v) then l3 else PHYS_ADDR_INVALID
    ensures Cached(words, root, v + 1, l2', l3')
  {
    hide I1, I2, Valid, Output, Slot;
  }

  lemma NothingMapped(words: Words, root: PhysAddr, v0: Vpn, template: nat, physBase: PhysAddr)
    ensures Progress(words, words, root, v0, 0, template, physBase)
  {
  }

  function OnlyRoot(root: PhysAddr): (r: Owner) {
    Owner(map[root := Root])
  }

  lemma EmptyRoot(memory: Words, root: PhysAddr)
    requires Frame(root)
    ensures var words := Memset(memory, root, 0, PAGE_ENTRY_COUNT);
            && Tree(words, OnlyRoot(root), root, root + PAGE_SIZE) && NoneMapped(words, root, 0, VPN_LIMIT)
            && Untouched(memory, words, root, root + PAGE_SIZE)
            && Linked(words, OnlyRoot(root), root) && AllTables(OnlyRoot(root), root, root + PAGE_SIZE)
            && InUse(words, OnlyRoot(root), root)
            && EntriesFrom(words, OnlyRoot(root), PTE_TEMPLATE_TABLE_KERN_ONLY)
  {
    var words := Memset(memory, root, 0, PAGE_ENTRY_COUNT);
    Cleared(memory, root);
    hide Memset, Slot, Valid, I1, I2, I3, InTable;
    forall w: Vpn | InSpace(w)
      ensures Walk(words, root, w) == Fault
    {
      IndexesInTable(w);
    }
  }

  /** The table memory, the arena pointer and the root of a pmap under construction. */
  class Pmap {
    var words: Words
    var allocationPtr: PhysAddr
    const tableBase: PhysAddr
    ghost var owner: Owner

    ghost predicate Ready()
      reads this
    {
      Tree(words, owner, tableBase, allocationPtr)
    }

    /**
     * Every page of the arena is a table that leads to a mapped page, or the root, and
     * the entries that link the tables are made from the kernel's table template.
     */
    ghost predicate Tidy()
      reads this
    {
      && Linked(words, owner, tableBase) && AllTables(owner, tableBase, allocationPtr)
      && InUse(words, owner, tableBase) && EntriesFrom(words, owner, PTE_TEMPLATE_TABLE_KERN_ONLY)
    }

    /** The start of pmap_vm_init (pmap_init.c:185-189): an empty root table, at the start of the arena. */
    constructor (memory: Words, bootstrapPaReserved: PhysAddr)
      requires Frame(bootstrapPaReserved)
      ensures Ready() && Tidy() && NoneMapped(words, tableBase, 0, VPN_LIMIT)
      ensures tableBase == bootstrapPaReserved && allocationPtr == bootstrapPaReserved + PAGE_SIZE
      ensures Untouched(memory, words, tableBase, allocationPtr)
    {
      EmptyRoot(memory, bootstrapPaReserved);
      words := Memset(memory, bootstrapPaReserved, 0, PAGE_ENTRY_COUNT);
      allocationPtr := bootstrapPaReserved + PAGE_SIZE;
      tableBase := bootstrapPaReserved;
      owner := OnlyRoot(bootstrapPaReserved);
    }

    /** allocation_ptr_page_alloc (pmap_init.c:61-67), always called to fill with zeros. */
    method AllocationPtrPageAlloc() returns (result: PhysAddr)
      requires Frame(allocationPtr)
      modifies this`words, this`allocationPtr
      ensures result == old(allocationPtr) && allocationPtr == result + PAGE_SIZE
      ensures EmptyTable(words, result)
      ensures forall a: PhysAddr :: PageOf(a) != result ==> Word(words, a) == Word(old(words), a)
    {
      result := allocationPtr;
      allocationPtr := allocationPtr + PAGE_SIZE;
      Cleared(words, result);
      words := Memset(words, result, 0, PAGE_ENTRY_COUNT);
    }

    /** table_lookup_allocating (pmap_init.c:76-93). */
    method TableLookupAllocating(table: PhysAddr, i: nat, template: nat) returns (result: PhysAddr)
      requires Ready() && CanLink(NodeAt(owner, table)) && InTable(i) && Template(template) && Frame(allocationPtr)
      requires Linked(words, owner, tableBase) && AllTables(owner, tableBase, allocationPtr)
      modifies this`words, this`allocationPtr, this`owner
      ensures Ready() && Grows(old(owner), owner) && NodeAt(owner, result) == Child(NodeAt(old(owner), table), i)
      ensures var e := Word(words, Slot(table, i)); Valid(e) && Output(e) == result
      ensures EntriesStay(old(words), words, old(owner)) && SameWalks(old(words), words, tableBase)
      ensures allocationPtr == old(allocationPtr) + if Valid(old(Word(words, Slot(table, i)))) then 0 else PAGE_SIZE
      ensures Untouched(old(words), words, tableBase, allocationPtr)
      ensures Linked(words, owner, tableBase) && AllTables(owner, tableBase, allocationPtr)
      ensures OnlyNew(old(owner), owner, Child(NodeAt(old(owner), table), i))
      ensures !Valid(old(Word(words, Slot(table, i)))) ==> Word(words, Slot(table, i)) == MakePte(template, result)
      ensures EntriesFrom(old(words), old(owner), template) ==> EntriesFrom(words, owner, template)
    {
      hide Linked, AllTables, OnlyNew, EntriesFrom;
      hide Slot, PageOf, InTable, Below, InSpace, Valid, Output, Template, PteToPhysAddr, MakePte, Store, Tree, Owning;
      hide EmptyTable, Grows, EntriesStay, SameWalks, CanLink, Child;
      ghost var before, limit := words, allocationPtr;
      ValidBits(Word(words, Slot(table, i)));
      result := PteToPhysAddr(Word(words, Slot(table, i)));
      if result != PHYS_ADDR_INVALID {
        TableFound(words, owner, tableBase, limit, table, i);
        return;
      }
      result := AllocationPtrPageAlloc();
      NewTable(before, words, owner, tableBase, limit, table, i, template);
      NewIsLinked(before, Store(words, Slot(table, i), MakePte(template, result)), owner, tableBase, limit, table, i);
      OneMoreTable(owner, tableBase, limit, table, i);
      if EntriesFrom(before, owner, template) {
        ClearedPage(before, words, owner, tableBase, limit);
        NewIsFromTemplate(before, words, owner, tableBase, limit, table, i, template);
      }
      StoreThere(words, Slot(table, i), MakePte(template, result));
      words := Store(words, Slot(table, i), MakePte(template, result));
      owner := Owning(owner, result, Child(NodeAt(owner, table), i));
    }

    /** The same, while the tables on the way to page v need not lead to a mapped page yet. */
    ghost predicate TidyBut(v: Vpn)
      reads this
    {
      && Linked(words, owner, tableBase) && AllTables(owner, tableBase, allocationPtr)
      && InUseBut(words, owner, tableBase, v) && EntriesFrom(words, owner, PTE_TEMPLATE_TABLE_KERN_ONLY)
    }

    lemma TidyIsTidyBut(v: Vpn)
      requires Tidy()
      ensures TidyBut(v)
    {
      NotYet(words, owner, tableBase, v);
    }

    /** Looks up a table on the way to page v. */
    method LookupOnTheWay(table: PhysAddr, i: nat, ghost v: Vpn) returns (result: PhysAddr)
      requires Ready() && TidyBut(v) && CanLink(NodeAt(owner, table)) && InTable(i) && Frame(allocationPtr)
      requires Through(Child(NodeAt(owner, table), i), v)
      modifies this`words, this`allocationPtr, this`owner
      ensures Ready() && TidyBut(v) && NodeAt(owner, result) == Child(NodeAt(old(owner), table), i)
      ensures var e := Word(words, Slot(table, i)); Valid(e) && Output(e) == result
      ensures EntriesStay(old(words), words, old(owner)) && SameWalks(old(words), words, tableBase)
      ensures allocationPtr == old(allocationPtr) + if Valid(old(Word(words, Slot(table, i)))) then 0 else PAGE_SIZE
      ensures Untouched(old(words), words, tableBase, allocationPtr)
    {
      hide Slot, InTable, Valid, Output, Template, Tree, NodeAt, Grows, EntriesStay, SameWalks, Untouched, Linked,
           AllTables, OnlyNew, InUseBut, EntriesFrom, Through, CanLink, Child;
      TableTemplate();
      ghost var before, owner0 := words, owner;
      result := TableLookupAllocating(table, i, PTE_TEMPLATE_TABLE_KERN_ONLY);
      UseOfNew(before, words, owner0, owner, tableBase, v, Child(NodeAt(owner0, table), i));
    }

    /** The cached lookups of the mapping loop (pmap_init.c:121-132). */
    method FindTables(l1i: nat, l2i: nat, l2: PhysAddr, l3: PhysAddr, ghost v: Vpn) returns (l2': PhysAddr,
                      l3': PhysAddr)
      requires Ready() && Tidy() && InSpace(v) && l1i == I1(v) && l2i == I2(v) && Cached(words, tableBase, v, l2, l3)
      requires Frame(allocationPtr) && Frame(allocationPtr + PAGE_SIZE)
      modifies this`words, this`allocationPtr, this`owner
      ensures Ready() && Cached(words, tableBase, v, l2', l3')
      ensures l2' != PHYS_ADDR_INVALID && l3' != PHYS_ADDR_INVALID
      ensures Later(old(allocationPtr), allocationPtr, 2)
      ensures SameWalks(old(words), words, tableBase) && Untouched(old(words), words, tableBase, allocationPtr)
      ensures TidyBut(v)
    {
      hide Slot, InTable, Below, InSpace, Valid, Output, Template, Tree, IsTableEntry, I1, I2, I3, Walk, Word, NodeAt;
      hide EntriesStay, Untouched, Pmap.Tidy, Pmap.TidyBut;
      TidyIsTidyBut(v);
      NothingTouched(words, tableBase, allocationPtr);
      IndexesInTable(v);
      WalkPath(words, owner, tableBase, allocationPtr, v);
      l2', l3' := l2, l3;
      if l2' == PHYS_ADDR_INVALID {
        l2' := LookupOnTheWay(tableBase, l1i, v);
        ValidBits(Word(words, Slot(tableBase, l1i)));
      }
      if l3' == PHYS_ADDR_INVALID {
        ghost var between, owner1, arena := words, owner, allocationPtr;
        WalkPath(words, owner, tableBase, allocationPtr, v);
        l3' := LookupOnTheWay(l2', l2i, v);
        UntouchedStill(old(words), between, words, tableBase, arena, allocationPtr, allocationPtr);
        EntryStays(between, words, owner1, tableBase, I1(v));
        ValidBits(Word(words, Slot(l2', l2i)));
      }
    }

    /** The body of the mapping loop up to the write of the entry (pmap_init.c:121-137). */
    method MapPage(l1i: nat, l2i: nat, l3i: nat, l2: PhysAddr, l3: PhysAddr, template: nat, pa: PhysAddr, ghost v: Vpn)
      returns (l2': PhysAddr, l3': PhysAddr, failed: bool)
      requires Ready() && Tidy() && InSpace(v) && IndexesAt(v, l1i, l2i, l3i) && Cached(words, tableBase, v, l2, l3)
      requires Template(template) && Frame(allocationPtr) && Frame(allocationPtr + PAGE_SIZE)
      modifies this`words, this`allocationPtr, this`owner
      ensures Ready() && Tidy() && Cached(words, tableBase, v, l2', l3')
      ensures Later(old(allocationPtr), allocationPtr, 2)
      ensures failed <==> old(Walk(words, tableBase, v)) != Fault
      ensures failed ==> SameWalks(old(words), words, tableBase)
      ensures Untouched(old(words), words, tableBase, allocationPtr)
      ensures !failed ==> OnePage(old(words), words, tableBase, v, Page(MakePte(template, pa)))
    {
      hide Slot, InTable, Below, InSpace, Output, Template, Tree, IsTableEntry, I1, I2, I3;
      hide Valid, Walk, MakePte, SameWalks, Untouched, Linked, AllTables, InUse, InUseBut, OnePage, EntriesFrom;
      l2', l3' := FindTables(l1i, l2i, l2, l3, v);
      ghost var found := words;
      WalkPath(words, owner, tableBase, allocationPtr, v);
      WalksAgree(old(words), words, tableBase, v);
      failed := Valid(Word(words, Slot(l3', l3i)));
      if !failed {
        EntryRoundTrip(template, pa);
        LeafReached(words, owner, tableBase, allocationPtr, v, l3', MakePte(template, pa));
        StoreLeaf(words, owner, tableBase, allocationPtr, v, l3', MakePte(template, pa));
        IndexesInTable(v);
        TableWrite(words, owner, tableBase, allocationPtr, l3', l3i, MakePte(template, pa));
        words := Store(words, Slot(l3', l3i), MakePte(template, pa));
        UntouchedStill(old(words), found, words, tableBase, allocationPtr, allocationPtr, allocationPtr);
        ThenOnePage(old(words), found, words, tableBase, v, Page(MakePte(template, pa)));
        LeafKeepsTemplates(found, owner, tableBase, allocationPtr, l3', l3i, MakePte(template, pa),
                           PTE_TEMPLATE_TABLE_KERN_ONLY);
        LeafKeepsEntries(found, owner, tableBase, allocationPtr, l3', l3i, MakePte(template, pa));
        UseOfMapped(found, words, owner, tableBase, v, Page(MakePte(template, pa)));
      } else {
        UseOfMappedBefore(old(words), words, owner, tableBase, v);
      }
    }

    /** One round of the mapping loop (pmap_init.c:121-154): maps page pageI and moves on. */
    method MapNext(c: Cursor, template: nat, physBase: PhysAddr, pageI: nat, ghost v0: Vpn, ghost before: Words)
      returns (c': Cursor, failed: bool, rolledOver: bool)
      requires Ready() && Tidy() && Template(template) && Frame(allocationPtr) && Frame(allocationPtr + PAGE_SIZE)
      requires InSpace(v0 + pageI) && CursorAt(words, tableBase, v0 + pageI, c)
      requires Progress(before, words, tableBase, v0, pageI, template, physBase)
      requires Untouched(before, words, tableBase, allocationPtr)
      modifies this`words, this`allocationPtr, this`owner
      ensures Ready() && Tidy() && Later(old(allocationPtr), allocationPtr, 2) && old(allocationPtr) <= allocationPtr
      ensures Untouched(before, words, tableBase, allocationPtr)
      ensures failed ==>
                && Progress(before, words, tableBase, v0, pageI, template, physBase)
                && Walk(before, tableBase, v0 + pageI) != Fault
      ensures !failed ==>
                && Progress(before, words, tableBase, v0, pageI + 1, template, physBase)
                && CursorAt(words, tableBase, v0 + pageI + 1, c')
                && (rolledOver <==> !InSpace(v0 + pageI + 1))
    {
      hide Template, FrameAt, MakePte, I1, I2, I3, Slot, Valid, Output, Walk, Tree, Cached, Mapped, NoneMapped,
           OnePage, Untouched, Linked, AllTables, InUse, EntriesFrom;
      ghost var between, arena := words, allocationPtr;
      StillAsBefore(before, words, tableBase, v0, pageI, template, physBase);
      c', rolledOver := c, false;
      var l2, l3;
      l2, l3, failed := MapPage(c.l1i, c.l2i, c.l3i, c.l2, c.l3, template, FrameAt(physBase, pageI), v0 + pageI);
      UntouchedStill(before, between, words, tableBase, arena, allocationPtr, allocationPtr);
      if failed {
        StaysMapped(before, between, words, tableBase, v0, pageI, template, physBase);
        return;
      }
      OneMore(before, between, words, tableBase, v0, pageI, template, physBase);
      var l1i, l2i, l3i, l2', l3', past := Advance(c.l1i, c.l2i, c.l3i, l2, l3, v0 + pageI);
      CachedNext(words, tableBase, v0 + pageI, l2, l3, l2', l3');
      c', rolledOver := Cursor(l1i, l2i, l3i, l2', l3'), past;
    }

    /** The mapping loop (pmap_init.c:119-156), from the page v0 the indexes are those of. */
    method MapPages(start: Cursor, template: nat, physBase: PhysAddr, pageCount: nat,
                    ghost v0: Vpn, ghost before: Words, ghost arena: PhysAddr)
      returns (outcome: Outcome, ghost mapped: nat)
      requires Ready() && Tidy() && Template(template) && InSpace(v0) && CursorAt(words, tableBase, v0, start)
      requires before == words && arena == allocationPtr && arena % PAGE_SIZE == 0
      requires arena + 2 * PAGE_SIZE * Mappable(v0, pageCount) <= FRAME_LIMIT
      modifies this`words, this`allocationPtr, this`owner
      ensures Ready() && Tidy() && Progress(before, words, tableBase, v0, mapped, template, physBase)
      ensures EndsAs(outcome, before, tableBase, v0, pageCount, mapped)
      ensures outcome == Done ==> Later(arena, allocationPtr, 2 * mapped)
      ensures Untouched(before, words, tableBase, allocationPtr) && arena <= allocationPtr
      ensures ArenaPointer(allocationPtr)
    {
      hide Template, CursorAt, Walk, Tree, Progress, Later, Frame, Mappable, MakePte, FrameAt, Mapped, NoneMapped;
      hide Untouched, Linked, AllTables, InUse, EntriesFrom;
      NothingMapped(words, tableBase, v0, template, physBase);
      NothingTouched(words, tableBase, allocationPtr);
      ArenaStart(allocationPtr);
      var c, pageI := start, 0;
      while pageI < pageCount
        invariant pageI <= pageCount && v0 + pageI <= VPN_LIMIT
        invariant pageI < pageCount ==> InSpace(v0 + pageI)
        invariant Ready() && Tidy() && CursorAt(words, tableBase, v0 + pageI, c)
        invariant Later(arena, allocationPtr, 2 * pageI)
        invariant Progress(before, words, tableBase, v0, pageI, template, physBase)
        invariant Untouched(before, words, tableBase, allocationPtr) && arena <= allocationPtr
        invariant ArenaPointer(allocationPtr)
      {
        ghost var between := allocationPtr;
        ArenaRoom(arena, allocationPtr, v0, pageCount, pageI);
        var failed, rolledOver;
        c, failed, rolledOver := MapNext(c, template, physBase, pageI, v0, before);
        ArenaLeft(between, allocationPtr);
        if failed {
          return AlreadyMapped, pageI;
        }
        LaterStill(arena, between, allocationPtr, pageI);
        pageI := pageI + 1;
        if rolledOver && pageI < pageCount {
          return RolledOver, pageI;
        }
      }
      return Done, pageI;
    }

    /**
     * vm_init_map_contiguous (pmap_init.c:101-157). The arena must have room for
     * the at most two new tables a page can need; of this it takes one page for
     * each table that the mapping needs. When the call returns or panics,
     * `mapped` pages are mapped.
     */
    method VmInitMapContiguous(template: nat, vmBase: nat, physBase: PhysAddr, pageCount: nat)
      returns (outcome: Outcome, ghost mapped: nat)
      requires Ready() && Tidy() && Template(template) && allocationPtr % PAGE_SIZE == 0
      requires allocationPtr + 2 * PAGE_SIZE * Mappable(VpnOf(vmBase), pageCount) <= FRAME_LIMIT
      modifies this`words, this`allocationPtr, this`owner
      ensures Ready() && Tidy() && mapped <= pageCount
      ensures Untouched(old(words), words, tableBase, allocationPtr) && old(allocationPtr) <= allocationPtr
      ensures allocationPtr == tableBase + |NeededTables(words, tableBase)| * PAGE_SIZE
      ensures Mapped(old(words), words, tableBase, VpnOf(vmBase), mapped, template, physBase)
      ensures outcome == Done <==>
                && VpnOf(vmBase) + pageCount <= VPN_LIMIT
                && NoneMapped(old(words), tableBase, VpnOf(vmBase), pageCount)
      ensures outcome == Done ==> mapped == pageCount && Later(old(allocationPtr), allocationPtr, 2 * pageCount)
      ensures outcome == AlreadyMapped ==>
                && mapped < pageCount && InSpace(VpnOf(vmBase) + mapped)
                && old(Walk(words, tableBase, VpnOf(vmBase) + mapped)) != Fault
                && NoneMapped(old(words), tableBase, VpnOf(vmBase), mapped)
    {
      IndexesOfAddress(vmBase);
      hide Linked, AllTables, InUse, EntriesFrom, NeededTables;
      hide Untouched, Walk, Mapped, Tree, VaToPhysIndexes, Template, VpnOf, I1, I2, I3;
      var (l1i, l2i, l3i) := VaToPhysIndexes(vmBase);
      var start := Cursor(l1i, l2i, l3i, PHYS_ADDR_INVALID, PHYS_ADDR_INVALID);
      outcome, mapped := MapPages(start, template, physBase, pageCount, VpnOf(vmBase), words, allocationPtr);
      ArenaIsExact(words, owner, tableBase, allocationPtr);
      if outcome == AlreadyMapped {
        FoundMapped(old(words), tableBase, VpnOf(vmBase), mapped, pageCount);
      }
    }
  }

  /** A page not reached yet translates as it did. */
  lemma StillAsBefore(before: Words, words: Words, root: PhysAddr, v0: Vpn, n: nat, template: nat, physBase: PhysAddr)
    requires Mapped(before, words, root, v0, n, template, physBase) && InSpace(v0 + n)
    ensures Walk(words, root, v0 + n) == Walk(before, root, v0 + n)
  {
  }

  lemma StaysMapped(before: Words, between: Words, words: Words, root: PhysAddr, v0: Vpn, n: nat, template: nat,
                    physBase: PhysAddr)
    requires Mapped(before, between, root, v0, n, template, physBase) && SameWalks(between, words, root)
    ensures Mapped(before, words, root, v0, n, template, physBase)
  {
    hide InSpace, Walk, MakePte, FrameAt;
  }

  lemma FoundMapped(words: Words, root: PhysAddr, v0: Vpn, n: nat, count: nat)
    requires n < count && InSpace(v0 + n) && Walk(words, root, v0 + n) != Fault
    ensures !NoneMapped(words, root, v0, count)
  {
  }

  lemma WalksAgree(before: Words, after: Words, root: PhysAddr, v: Vpn)
    requires SameWalks(before, after, root) && InSpace(v)
    ensures Walk(after, root, v) == Walk(before, root, v)
  {
  }

  lemma ThenOnePage(before: Words, found: Words, after: Words, root: PhysAddr, v: Vpn, t: Translation)
    requires SameWalks(before, found, root)
    requires forall w: Vpn :: InSpace(w) ==> Walk(after, root, w) == if w == v then t else Walk(found, root, w)
    ensures OnePage(before, after, root, v, t) && OnePage(found, after, root, v, t)
  {
    hide Walk, InSpace;
  }
}
