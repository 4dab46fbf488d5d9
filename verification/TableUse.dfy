/**
 What the arena of the boot code is spent on (kernel/machine/pmap/pmap_init.c:57-157):
 each of its pages is a table, each table has its own place in the tree, and each
 but the root leads to a page that is mapped. So its size follows from the mapping.
 */
module TableUse {
  import opened Pages
  import opened PageTables

  /** Valid entries of the tables stay as they are. */
  ghost predicate EntriesStay(before: Words, after: Words, owner: Owner) {
    forall p, j {:trigger Slot(p, j)} :: NodeAt(owner, p) != Unused && InTable(j) && Valid(Word(before, Slot(p, j))) ==>
                                           Word(after, Slot(p, j)) == Word(before, Slot(p, j))
  }

  ghost predicate SameWalks(before: Words, after: Words, root: PhysAddr) {
    forall w: Vpn :: InSpace(w) ==> Walk(after, root, w) == Walk(before, root, w)
  }

  /** Page v now translates to t, and every other page as before. */
  ghost predicate OnePage(before: Words, after: Words, root: PhysAddr, v: Vpn, t: Translation) {
    forall w: Vpn :: InSpace(w) ==> Walk(after, root, w) == if w == v then t else Walk(before, root, w)
  }

  /** The entries on the way to a table's place in the tree lead to page p. */
  ghost predicate LeadsTo(words: Words, root: PhysAddr, n: Node, p: PhysAddr) {
    match n
    case Unused => true
    case Root => p == root
    case Level2(i) =>
      var e := Word(words, Slot(root, i));
      InTable(i) && Valid(e) && Output(e) == p
    case Level3(i, j) =>
      var e := Word(words, Slot(root, i));
      var f := Word(words, Slot(Output(e), j));
      InTable(i) && Valid(e) && InTable(j) && Valid(f) && Output(f) == p
  }

  /** Every table is where the entries for its place lead. */
  ghost predicate Linked(words: Words, owner: Owner, root: PhysAddr) {
    forall p {:trigger NodeAt(owner, p)} :: LeadsTo(words, root, NodeAt(owner, p), p)
  }

  /** Every page of the arena is a table. */
  ghost predicate AllTables(owner: Owner, root: PhysAddr, limit: PhysAddr) {
    forall p {:trigger NodeAt(owner, p)} ::
      Frame(p) && !Below(p, root) && Below(p, limit) ==> NodeAt(owner, p) != Unused
  }

  /** The walk to page w passes through this place of the tree. */
  ghost predicate Through(n: Node, w: Vpn) {
    match n
    case Unused => false
    case Root => true
    case Level2(i) => I1(w) == i
    case Level3(i, j) => I1(w) == i && I2(w) == j
  }

  /** The root, or a place on the way to a page that is mapped. */
  ghost predicate Needed(words: Words, root: PhysAddr, n: Node) {
    n.Root? || exists w: Vpn :: InSpace(w) && Walk(words, root, w) != Fault && Through(n, w)
  }

  ghost predicate InUse(words: Words, owner: Owner, root: PhysAddr) {
    forall p {:trigger NodeAt(owner, p)} :: NodeAt(owner, p) != Unused ==> Needed(words, root, NodeAt(owner, p))
  }

  /** The same, but the tables on the way to page v need not be in use yet. */
  ghost predicate InUseBut(words: Words, owner: Owner, root: PhysAddr, v: Vpn) {
    forall p {:trigger NodeAt(owner, p)} :: NodeAt(owner, p) != Unused ==>
      Needed(words, root, NodeAt(owner, p)) || Through(NodeAt(owner, p), v)
  }

  /** Any table that was added has place n. */
  ghost predicate OnlyNew(before: Owner, after: Owner, n: Node) {
    forall p {:trigger NodeAt(after, p)} :: NodeAt(after, p) == NodeAt(before, p) || NodeAt(after, p) == n
  }

  /** Every valid entry of a table that leads to further tables is made from one template. */
  ghost predicate EntriesFrom(words: Words, owner: Owner, template: nat) {
    forall p, i {:trigger Slot(p, i)} ::
      CanLink(NodeAt(owner, p)) && InTable(i) && Valid(Word(words, Slot(p, i))) ==>
      Word(words, Slot(p, i)) == MakePte(template, Output(Word(words, Slot(p, i))))
  }

  /** A new empty table, linked with an entry of the template. */
  lemma NewIsFromTemplate(words: Words, cleared: Words, owner: Owner, root: PhysAddr, limit: PhysAddr,
                          t: PhysAddr, i: nat, template: nat)
    requires Tree(cleared, owner, root, limit) && EntriesFrom(words, owner, template) && Template(template)
    requires CanLink(NodeAt(owner, t)) && InTable(i)
    requires Frame(limit) && EmptyTable(cleared, limit) && NodeAt(owner, limit) == Unused
    requires forall p, j {:trigger Slot(p, j)} :: NodeAt(owner, p) != Unused && InTable(j) ==>
                                                   Word(cleared, Slot(p, j)) == Word(words, Slot(p, j))
    ensures EntriesFrom(Store(cleared, Slot(t, i), MakePte(template, limit)),
                        Owning(owner, limit, Child(NodeAt(owner, t), i)), template)
  {
    EntryRoundTrip(template, limit);
    hide Frame, Slot, InTable, Below, Valid, Output, Template, MakePte, Store, NodeAt, Owning, EntryFits;
    var e, owner' := MakePte(template, limit), Owning(owner, limit, Child(NodeAt(owner, t), i));
    OwningAt(owner, limit, Child(NodeAt(owner, t), i));
    StoreElsewhere(cleared, owner', t, i, e);
  }

  /** Entries of the last level are no part of this. */
  lemma LeafKeepsTemplates(words: Words, owner: Owner, root: PhysAddr, limit: PhysAddr, t: PhysAddr, i: nat, e: Pte,
                           template: nat)
    requires Tree(words, owner, root, limit) && EntriesFrom(words, owner, template)
    requires NodeAt(owner, t).Level3? && InTable(i)
    ensures EntriesFrom(Store(words, Slot(t, i), e), owner, template)
  {
    hide Frame, Slot, InTable, Below, Valid, Output, MakePte, Store, NodeAt, EntryFits;
    StoreElsewhere(words, owner, t, i, e);
  }

  lemma EntriesOnTheWay(words: Words, owner: Owner, root: PhysAddr, limit: PhysAddr, n: Node, p: PhysAddr)
    requires Tree(words, owner, root, limit) && LeadsTo(words, root, n, p)
    ensures NodeAt(owner, root) != Unused
    ensures n.Level3? ==> NodeAt(owner, Output(Word(words, Slot(root, n.i1)))) == Level2(n.i1)
  {
    hide Slot, Frame, InTable, Below, Valid, Output;
    if n.Level3? {
      assert EntryFits(owner, NodeAt(owner, root), n.i1, Word(words, Slot(root, n.i1)));
    }
  }

  lemma StaysLinked(before: Words, after: Words, owner: Owner, root: PhysAddr, limit: PhysAddr)
    requires Tree(before, owner, root, limit) && Linked(before, owner, root) && EntriesStay(before, after, owner)
    ensures Linked(after, owner, root)
  {
    hide Slot, Frame, InTable, Below, Valid, Output, Tree;
    forall p
      ensures LeadsTo(after, root, NodeAt(owner, p), p)
    {
      EntriesOnTheWay(before, owner, root, limit, NodeAt(owner, p), p);
    }
  }

  /** A new table, linked from entry i of table t. */
  lemma NewIsLinked(before: Words, after: Words, owner: Owner, root: PhysAddr, limit: PhysAddr, t: PhysAddr, i: nat)
    requires Tree(before, owner, root, limit) && Linked(before, owner, root) && EntriesStay(before, after, owner)
    requires CanLink(NodeAt(owner, t)) && InTable(i)
    requires Valid(Word(after, Slot(t, i))) && Output(Word(after, Slot(t, i))) == limit
    ensures Linked(after, Owning(owner, limit, Child(NodeAt(owner, t), i)), root)
  {
    hide Slot, Frame, InTable, Below, Valid, Output, Tree, NodeAt, Owning;
    var n := Child(NodeAt(owner, t), i);
    StaysLinked(before, after, owner, root, limit);
    OwningAt(owner, limit, n);
    assert LeadsTo(before, root, NodeAt(owner, t), t) && LeadsTo(after, root, NodeAt(owner, t), t);
  }

  /** With the next page of the arena as a table, every page is one. */
  lemma OneMoreTable(owner: Owner, root: PhysAddr, limit: PhysAddr, t: PhysAddr, i: nat)
    requires AllTables(owner, root, limit) && Frame(limit) && CanLink(NodeAt(owner, t))
    ensures var n := Child(NodeAt(owner, t), i);
            AllTables(Owning(owner, limit, n), root, limit + PAGE_SIZE) && OnlyNew(owner, Owning(owner, limit, n), n)
  {
    hide NodeAt, Owning;
    var n := Child(NodeAt(owner, t), i);
    OwningAt(owner, limit, n);
    forall p | Frame(p) && !Below(p, root) && Below(p, limit + PAGE_SIZE)
      ensures NodeAt(Owning(owner, limit, n), p) != Unused
    {
      FramesBelow(p, limit);
    }
  }

  lemma FramesBelow(p: PhysAddr, limit: PhysAddr)
    requires Frame(p) && Frame(limit) && Below(p, limit + PAGE_SIZE)
    ensures p == limit || Below(p, limit)
  {
  }

  lemma UseOfNew(before: Words, after: Words, owner: Owner, owner': Owner, root: PhysAddr, v: Vpn, n: Node)
    requires InUseBut(before, owner, root, v) && SameWalks(before, after, root)
    requires OnlyNew(owner, owner', n) && Through(n, v)
    ensures InUseBut(after, owner', root, v)
  {
    hide Walk, InSpace, NodeAt, Through;
  }

  /** Once page v is mapped, the tables on its way are in use. */
  lemma UseOfMapped(before: Words, after: Words, owner: Owner, root: PhysAddr, v: Vpn, t: Translation)
    requires InUseBut(before, owner, root, v) && InSpace(v) && t != Fault
    requires OnePage(before, after, root, v, t)
    ensures InUse(after, owner, root)
  {
    hide Walk, InSpace, NodeAt, Through;
  }

  lemma UseOfMappedBefore(before: Words, after: Words, owner: Owner, root: PhysAddr, v: Vpn)
    requires InUseBut(after, owner, root, v) && InSpace(v) && Walk(before, root, v) != Fault
    requires SameWalks(before, after, root)
    ensures InUse(after, owner, root)
  {
    hide Walk, NodeAt, Through;
    assert Walk(after, root, v) != Fault;
    hide InSpace;
  }

  /** A place of the tree has a table exactly when it is needed. */
  lemma TablesAreNeeded(words: Words, owner: Owner, root: PhysAddr, limit: PhysAddr, n: Node)
    requires Tree(words, owner, root, limit) && InUse(words, owner, root) && n != Unused
    ensures (exists p :: NodeAt(owner, p) == n) <==> Needed(words, root, n)
  {
    hide Walk, Slot, Frame, Below, Valid, Output, IsTableEntry, PteToPhysAddr, I1, I2, I3, InSpace;
    if Needed(words, root, n) {
      if n.Root? {
        assert NodeAt(owner, root) == Root;
      } else {
        var w: Vpn :| InSpace(w) && Walk(words, root, w) != Fault && Through(n, w);
        WalkPath(words, owner, root, limit, w);
      }
    }
  }

  /** No place has two tables. */
  lemma OneTableEach(words: Words, owner: Owner, root: PhysAddr, p: PhysAddr, q: PhysAddr)
    requires Linked(words, owner, root) && NodeAt(owner, p) == NodeAt(owner, q) != Unused
    ensures p == q
  {
    assert LeadsTo(words, root, NodeAt(owner, p), p) && LeadsTo(words, root, NodeAt(owner, q), q);
  }

  /** The places that a mapping needs: it decides how many tables there are. */
  ghost function NeededTables(words: Words, root: PhysAddr): (r: set<Node>) {
    {Root}
    + (set w: Vpn | 0 <= w < VPN_LIMIT && Walk(words, root, w) != Fault :: Level2(I1(w)))
    + (set w: Vpn | 0 <= w < VPN_LIMIT && Walk(words, root, w) != Fault :: Level3(I1(w), I2(w)))
  }

  lemma NeededMember(words: Words, root: PhysAddr, n: Node)
    ensures n in NeededTables(words, root) <==> n != Unused && Needed(words, root, n)
  {
    hide Walk, I1, I2;
    if n != Unused && Needed(words, root, n) && !n.Root? {
      var w: Vpn :| InSpace(w) && Walk(words, root, w) != Fault && Through(n, w);
    }
  }

  /** What page k of the arena holds. */
  ghost function PlaceAt(owner: Owner, root: PhysAddr, k: nat): (n: Node) {
    NodeAt(owner, root + k * PAGE_SIZE)
  }

  /** What the first `count` pages of the arena hold. */
  ghost function Places(owner: Owner, root: PhysAddr, count: nat): (r: set<Node>) {
    if count == 0 then {} else Places(owner, root, count - 1) + {PlaceAt(owner, root, count - 1)}
  }

  lemma {:induction false} PlacesMember(owner: Owner, root: PhysAddr, count: nat, n: Node)
    ensures n in Places(owner, root, count) <==>
              exists k: nat {:trigger PlaceAt(owner, root, k)} :: k < count && PlaceAt(owner, root, k) == n
  {
    hide PlaceAt;
    if count > 0 {
      PlacesMember(owner, root, count - 1, n);
    }
  }

  lemma {:induction false} PlacesCount(words: Words, owner: Owner, root: PhysAddr, count: nat)
    requires Linked(words, owner, root)
    requires forall k: nat :: k < count ==> PlaceAt(owner, root, k) != Unused
    ensures |Places(owner, root, count)| == count
  {
    hide Linked, PlaceAt;
    if count > 0 {
      PlacesCount(words, owner, root, count - 1);
      PlacesMember(owner, root, count - 1, PlaceAt(owner, root, count - 1));
      forall k: nat | k < count - 1
        ensures PlaceAt(owner, root, k) != PlaceAt(owner, root, count - 1)
      {
        if PlaceAt(owner, root, k) == PlaceAt(owner, root, count - 1) {
          PlacesDiffer(words, owner, root, k, count - 1);
        }
      }
    }
  }

  lemma PlacesDiffer(words: Words, owner: Owner, root: PhysAddr, k: nat, l: nat)
    requires Linked(words, owner, root) && PlaceAt(owner, root, k) == PlaceAt(owner, root, l) != Unused
    ensures k == l
  {
    hide Linked;
    OneTableEach(words, owner, root, root + k * PAGE_SIZE, root + l * PAGE_SIZE);
  }

  /** The arena has grown by exactly one page for each table that the mapping needs. */
  lemma ArenaIsExact(words: Words, owner: Owner, root: PhysAddr, limit: PhysAddr)
    requires Tree(words, owner, root, limit) && limit % PAGE_SIZE == 0 && limit <= FRAME_LIMIT
    requires Linked(words, owner, root) && AllTables(owner, root, limit) && InUse(words, owner, root)
    ensures limit == root + |NeededTables(words, root)| * PAGE_SIZE
  {
    assert NodeAt(owner, root) == Root && Frame(root) && Below(root, limit);
    var count := (limit - root) / PAGE_SIZE;
    assert limit == root + count * PAGE_SIZE;
    forall k: nat | k < count
      ensures PlaceAt(owner, root, k) != Unused
    {
      assert Frame(root + k * PAGE_SIZE);
    }
    PlacesCount(words, owner, root, count);
    forall n
      ensures n in Places(owner, root, count) <==> n in NeededTables(words, root)
    {
      PlacesMember(owner, root, count, n);
      PlaceInArena(words, owner, root, limit, n, count);
    }
    assert Places(owner, root, count) == NeededTables(words, root);
  }

  lemma PlaceInArena(words: Words, owner: Owner, root: PhysAddr, limit: PhysAddr, n: Node, count: nat)
    requires Tree(words, owner, root, limit) && InUse(words, owner, root)
    requires AllTables(owner, root, limit) && limit == root + count * PAGE_SIZE && limit <= FRAME_LIMIT
    ensures n in NeededTables(words, root) <==>
              exists k: nat {:trigger PlaceAt(owner, root, k)} :: k < count && PlaceAt(owner, root, k) == n
  {
    hide InUse, NeededTables, Needed, EntryFits, Slot;
    NeededMember(words, root, n);
    assert NodeAt(owner, root) == Root;
    forall k: nat | k < count
      ensures PlaceAt(owner, root, k) != Unused
    {
      assert Frame(root + k * PAGE_SIZE);
    }
    if n != Unused {
      TablesAreNeeded(words, owner, root, limit, n);
      if p: PhysAddr :| NodeAt(owner, p) == n {
        var k := (p - root) / PAGE_SIZE;
        assert p == root + k * PAGE_SIZE && PlaceAt(owner, root, k) == n;
      }
    }
  }
}
