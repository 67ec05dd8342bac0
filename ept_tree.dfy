/** The EPT radix tree as a value: the specification that the heap-based
    `EptIntelX64.Ept` class is proved against. One `Tree` is one table (a
    PML4, PDPT, PD or PT) with its 512 slots; a slot is empty, a leaf page,
    or a branch to the table one level down. */
module EptTree {
  import opened EptAddress

  /** Bit 7 of an entry, the page-size bit. */
  const PageSizeBit: bv64 := 1 << 7

  /** One hardware entry as the entry codec classifies it; a page keeps its
      opaque attribute word (permissions, memory type, page-size bit). */
  datatype Entry = Unused | Table | Page(attrs: bv64)

  datatype Slot = Free | Leaf(attrs: bv64) | Branch(child: Tree)

  datatype Tree = Tree(slots: seq<Slot>)

  /** TableConflict: a table sits where a page was requested (a finer mapping
      exists); PageConflict: a coarser page already covers the address;
      NotMapped: a lookup found no page. */
  datatype Error = TableConflict | PageConflict | NotMapped

  datatype Result<T> = Success(value: T) | Failure(error: Error)

  /** What an insertion leaves behind: the new tree and the call's outcome. */
  datatype Added = Added(tree: Tree, result: Result<Entry>)

  /** Where a walk ends: the first slot that is not a branch, and its level. */
  datatype Stop = Stop(slot: Slot, bits: Shift)

  /** The hardware entry that stands in a slot. */
  function EntryOf(s: Slot): Entry
  {
    match s
    case Free => Unused
    case Leaf(a) => Page(a)
    case Branch(_) => Table
  }

  /** A freshly allocated, zero-filled table. */
  function EmptyTree(): (t: Tree)
    ensures |t.slots| == Entries && IsEmpty(t)
  {
    Tree(seq(Entries, _ => Free))
  }

  /** `empty()`: every entry of this one table is unused; exactly the tables
      whose `global_size()` is zero, and they reserve only their own slots. */
  predicate IsEmpty(t: Tree)
  {
    forall i | 0 <= i < |t.slots| :: t.slots[i].Free?
  }

  /** The shape of a well-formed subtree rooted at level `bits`: 512 slots per
      table, no branch below the PT, and no empty table below the root. */
  ghost predicate Wf(t: Tree, bits: Shift)
    decreases t
  {
    |t.slots| == Entries &&
    forall i | 0 <= i < Entries ::
      t.slots[i].Branch? ==>
        bits > PtFrom && Wf(t.slots[i].child, bits - IndexWidth) && !IsEmpty(t.slots[i].child)
  }

  /** The translation walk: follow branches along the route of `gpa` until a
      slot that is not a branch. */
  function Walk(t: Tree, gpa: Gpa, bits: Shift): (w: Stop)
    requires Wf(t, bits)
    ensures w.bits <= bits && !w.slot.Branch?
    decreases bits
  {
    var s := t.slots[Index(gpa, bits)];
    if s.Branch? then Walk(s.child, gpa, bits - IndexWidth) else Stop(s, bits)
  }

  /** `gpa_to_epte`: the page entry the walk ends at, or NotMapped. */
  function Lookup(t: Tree, gpa: Gpa, bits: Shift): (r: Result<Entry>)
    requires Wf(t, bits)
    ensures r.Success? <==> Walk(t, gpa, bits).slot.Leaf?
    ensures r.Success? ==> r.value.Page?
    ensures r.Failure? ==> r.error == NotMapped
  {
    match Walk(t, gpa, bits).slot
    case Leaf(a) => Success(Page(a))
    case _ => Failure(NotMapped)
  }

  /** `add_page(gpa, bits, end)`: descend from level `bits`, creating tables in
      empty slots, until level `end`, and map a page there. */
  function Insert(t: Tree, gpa: Gpa, bits: Shift, end: Shift): (r: Added)
    requires Wf(t, bits) && end <= bits
    ensures r.result.Success? ==> r.result.value.Page?
    ensures r.result.Failure? ==> r.tree == t && r.result.error != NotMapped
    ensures |r.tree.slots| == Entries
    decreases bits
  {
    var i := Index(gpa, bits);
    var s := t.slots[i];
    if bits > end then
      if s.Leaf? then Added(t, Failure(PageConflict))
      else
        var below := Insert(if s.Branch? then s.child else EmptyTree(), gpa, bits - IndexWidth, end);
        if below.result.Failure? then Added(t, below.result)
        else Added(Tree(t.slots[i := Branch(below.tree)]), below.result)
    else if s.Branch? then Added(t, Failure(TableConflict))
    else if s.Leaf? then Added(t, Success(Page(s.attrs)))
    else Added(Tree(t.slots[i := Leaf(PageSizeBit)]), Success(Page(PageSizeBit)))
  }

  /** `remove_page(gpa, bits)`: clear whatever page the route of `gpa` reaches
      and drop every table on the way back that the removal left empty. */
  function Remove(t: Tree, gpa: Gpa, bits: Shift): (r: Tree)
    requires Wf(t, bits)
    ensures |r.slots| == Entries && !r.slots[Index(gpa, bits)].Leaf?
    ensures r.slots[Index(gpa, bits)].Branch? ==> t.slots[Index(gpa, bits)].Branch?
    decreases bits
  {
    var i := Index(gpa, bits);
    var s := t.slots[i];
    if s.Branch? then
      var below := Remove(s.child, gpa, bits - IndexWidth);
      Tree(t.slots[i := if IsEmpty(below) then Free else Branch(below)])
    else
      Tree(t.slots[i := Free])
  }

  /** `global_size()`: used entries in this table and in every table below. */
  function Size(t: Tree): (n: nat)
    ensures n == 0 <==> forall i | 0 <= i < |t.slots| :: t.slots[i].Free?
    decreases t, 1
  {
    SizeBelow(t, |t.slots|)
  }

  function SizeBelow(t: Tree, n: nat): (r: nat)
    requires n <= |t.slots|
    ensures r == 0 <==> forall i | 0 <= i < n :: t.slots[i].Free?
    decreases t, 0, n
  {
    if n == 0 then 0
    else
      SizeBelow(t, n - 1) +
      match t.slots[n - 1]
      case Free => 0
      case Leaf(_) => 1
      case Branch(c) => 1 + Size(c)
  }

  /** `global_capacity()`: slots in this table and in every table below. */
  function Capacity(t: Tree): (c: nat)
    ensures c >= |t.slots|
    decreases t, 1
  {
    |t.slots| + CapacityBelow(t, |t.slots|)
  }

  function CapacityBelow(t: Tree, n: nat): (c: nat)
    requires n <= |t.slots|
    decreases t, 0, n
  {
    if n == 0 then 0
    else
      CapacityBelow(t, n - 1) +
      match t.slots[n - 1]
      case Branch(c) => Capacity(c)
      case _ => 0
  }

  /** The number of tables in the tree, this one included. */
  function Tables(t: Tree): nat
    decreases t, 1
  {
    1 + TablesBelow(t, |t.slots|)
  }

  function TablesBelow(t: Tree, n: nat): nat
    requires n <= |t.slots|
    decreases t, 0, n
  {
    if n == 0 then 0
    else
      TablesBelow(t, n - 1) +
      match t.slots[n - 1]
      case Branch(c) => Tables(c)
      case _ => 0
  }

  /** The number of pages mapped by the tree. */
  function Pages(t: Tree): nat
    decreases t, 1
  {
    PagesBelow(t, |t.slots|)
  }

  function PagesBelow(t: Tree, n: nat): nat
    requires n <= |t.slots|
    decreases t, 0, n
  {
    if n == 0 then 0
    else
      PagesBelow(t, n - 1) +
      match t.slots[n - 1]
      case Free => 0
      case Leaf(_) => 1
      case Branch(c) => Pages(c)
  }

  /** An empty table is well formed at every level. */
  lemma EmptyWf(bits: Shift)
    ensures Wf(EmptyTree(), bits)
  {
  }

  /** One step of the walk, for proofs that follow a branch. */
  lemma LookupStep(t: Tree, gpa: Gpa, bits: Shift)
    requires Wf(t, bits) && t.slots[Index(gpa, bits)].Branch?
    ensures Lookup(t, gpa, bits) == Lookup(t.slots[Index(gpa, bits)].child, gpa, bits - IndexWidth)
  {
  }

  /** Addresses whose routes agree down to the level where the walk of `g`
      ends take the very same walk: a page answers for its whole region. */
  lemma {:induction false} WalkSameRoute(t: Tree, g: Gpa, h: Gpa, bits: Shift)
    requires Wf(t, bits) && SameRoute(g, h, bits, Walk(t, g, bits).bits)
    ensures Walk(t, h, bits) == Walk(t, g, bits)
    decreases bits
  {
    var s := t.slots[Index(g, bits)];
    if s.Branch? {
      WalkSameRoute(s.child, g, h, bits - IndexWidth);
    }
  }

  /** A table with no used entry maps nothing. */
  lemma LookupEmpty(t: Tree, gpa: Gpa, bits: Shift)
    requires Wf(t, bits) && IsEmpty(t)
    ensures Walk(t, gpa, bits) == Stop(Free, bits)
    ensures Lookup(t, gpa, bits) == Failure(NotMapped)
  {
  }
}
